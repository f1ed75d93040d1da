# Garage light firmware: a verified model

The garage light is a two-core microcontroller that shows one fact, "the beam is broken", on a lamp. The fact arrives
over Bluetooth; the firmware is replaced over the network. Both jobs are safety arguments that run through several
parts of the program, and this project states and proves them:

- **The download.** A response head is parsed one byte at a time from reads of any size, the body bytes read along with
  it are handed on, and the body is streamed into the DFU partition and hashed on the way. Whatever the reads look like,
  flash receives the bytes behind the head in order, and it is committed only when it holds the whole declared body
  and the digest is the published one.
- **The lamp.** The Bluetooth loop and a 20 ms ticker post into an eight-slot queue that drops what does not fit; one
  task applies the events and drives the pin. A fact is never shown for longer than the leash plus one tick gap,
  whatever was dropped; and outside a connection the queue always ends in the fault pattern, provided no link-down was
  dropped. That proviso is needed, and a run shows it.
- **The release.** A deploy writes image, checksum, version, then prunes; the device fetches version, checksum, image;
  a marked image is swapped in, tests itself, and is confirmed or undone. In every interleaving, with torn uploads and
  with a reset possible at every step, only an image some deploy built survives its trial boot, and only after both
  mandatory signals were seen in it. This holds without condition if the bootloader library refuses writes while a swap
  is unconfirmed, and otherwise exactly as long as no download writes into an open trial. On the server, starting a
  deploy keeps the announced release whole exactly under a condition its operator can check beforehand; going back to a
  lower version is within it.
- **The codecs.** Base64 and Basic credentials, decimal versions and hexadecimal digests, the update URL, the
  linker-script reader and its checks in the bootloader's build, and the UF2 builder, each proved against its inverse or
  an independent description.

## How it is laid out

Code that changes state in the firmware is imperative here: classes with the firmware's fields (`HeadParser`,
`HttpBody`, `LampMachine`, `Lamp`, `EventQueue`, `Peripheral`, `TextBuf`), methods with its loops. Each is
proved against a function or predicate over everything it has seen, and the theorems are about those. The three
concurrent systems are step machines (`BleSystem.Step`, `ReleaseServer.Step`, `Lifecycle.Step`): any list of actions is
a run, an action that is not possible does nothing, and a theorem is about every list. Imperative and step-machine
views are tied together: `Peripheral.Turn` and `EventQueue.Post` do what `BleSystem.Step` says, `PruneCovered` shows
that the prune script's effects are runs of `ReleaseServer.Step`, and `CheckCovered` and `SelfTestCovered` show that the
update task and the self-test at boot are runs of `Lifecycle.Step`.

| file | what it holds |
|---|---|
| `Bytes.dfy`, `Decimal.dfy` | byte classes, trimming and splitting; versions and digests as text |
| `HeaderShape.dfy`, `HeadGrammar.dfy`, `HeadParser.dfy` | the response head: what a header line is, what a head means, and the byte-fed parser |
| `Transport.dfy`, `Session.dfy`, `UpdateTask.dfy` | one GET, the verified stream, the whole check |
| `RequestReader.dfy`, `UpdateRequest.dfy` | a server's reading of a request, and what it reads off ours |
| `FaultPattern.dfy`, `LampMachine.dfy`, `LampOwner.dfy`, `BleSystem.dfy` | the lamp path |
| `ReleaseFiles.dfy`, `SelfTest.dfy`, `ReleaseServer.dfy`, `Lifecycle.dfy` | the release path |
| `Base64.dfy`, `Url.dfy`, `UrlShape.dfy` | credentials and the update URL |
| `MemoryMap.dfy`, `Partition.dfy`, `ShippedMap.dfy`, `Uf2.dfy` | the linker script, its checks, the bootloader's own script, the UF2 image |

The outside world is nondeterministic: a `Link` hands out any nonempty piece of an unknown stream or fails, a `Flasher`
may refuse any write, clocks advance by any amount, signals are arbitrary. SHA-256 is any function from byte strings to
32 bytes. The bootloader is its contract in the repository's `README.md:149-159`: a mark swaps at the next reset, a swap
that is not confirmed is undone at the reset after.

## Where the code and its comments differ

The model follows the code.

- A head may end its lines in a bare LF as well as CRLF; the comments speak of CRLF CRLF only.
- "Exactly one Content-Length" has an exception: a 404 may come without one.
- A response other than 404 is just as transient: any accepted status but 200 ends the check without an error.
- `check_and_update` is described as never resetting; it resets after a commit.
- The partition check bounds regions only from above, so "in flash" is not what it guarantees (`AcceptedInFlashIff`).
- A confirmation that fails is logged and the boot goes on to the updater with the trial open. Whether its next download
  can then overwrite the image to fall back to depends on the bootloader library, which is not part of this model: if it
  refuses writes in a trial nothing is lost (`RefusingIsSafe`), if it takes them the device can settle on anything
  (`FailedConfirmationCanSettleAnything`).
- A VERSION with leading zeros is accepted by the deploy script and published under names the device never asks for
  (`DeviceFindsIff`).

## Model

| member | source | states |
|---|---|---|
| HeadParsing.HeadParser.Push | core/src/ota/http.rs:91-150 | After any bytes in any fragmentation, the event is the one-shot reading of all bytes pushed; the line buffer never fills and no line is acted on after the end |
| HeadParsing.HeadParser.PushLf | core/src/ota/http.rs:108-149 | The LF case drops one CR and ends with the fields saying what the lines so far say, or with the latched event |
| HeadParsing.HeadParser.EndLine | core/src/ota/http.rs:112-149 | A completed line has the verdict the grammar gives it behind the lines before it |
| HeadParsing.HeadParser.HeaderLine | core/src/ota/http.rs:120-147 | A header line keeps the flags equal to what all lines say, and a second length is rejected |
| HeadParsing.HeadParser.BlankLine | core/src/ota/http.rs:210-222 | At the blank line the flags kept so far give the verdict all lines before it call for: chunked first, then the status, then a missing length except for 404 |
| HeadParsing.HeadParser.Finish | core/src/ota/http.rs:224-239 | Latching the decision on everything pushed puts the parser in order for good |
| HeadParsing.HeadParser.ConsumedBytes | core/src/ota/http.rs:85-89 | The count is the length of the shortest prefix that decides |
| HeadParsing.HeadParser.constructor | core/src/ota/http.rs:72-83 | A new parser has seen nothing and satisfies the invariant |
| HeadParsing.ParseStatus | core/src/ota/http.rs:152-176 | The digit loop with its 16-bit check agrees with the status-line grammar on every line |
| HeadParsing.ParseHeader | core/src/ota/http.rs:178-208 | The header parser agrees with the header grammar on every line; what that grammar accepts is `HeadGrammar.HeaderAccepted` and `HeadGrammar.BadHeader` |
| HeadParsing.AccumulateLength | core/src/ota/http.rs:195-205 | The step-by-step 64-bit check fails exactly when the full value does not fit or a byte is no digit |
| HeadGrammar.CompletesIff | core/src/ota/http.rs:91-240 | A stream completes with a head exactly when it starts with the rendering, in any mix of CRLF and LF, of a legal head of at most 2048 bytes, and exactly that rendering is consumed; legality is stated by the shapes of the status and header lines |
| HeadGrammar.LegalCompletes | core/src/ota/http.rs:210-232 | Every legal head within the bound completes at its blank line, whatever body follows |
| HeadGrammar.RejectsIff | core/src/ota/http.rs:20-31 | All nine causes: a stream is rejected for an error exactly when some line with nothing decided before it is to blame for that error, and for its size exactly when 2048 bytes decide nothing and there is one more |
| HeadGrammar.EventSticks | core/src/ota/http.rs:91-98 | Once decided, neither the event nor the consumed count depends on later bytes |
| HeadGrammar.ConsumedDecides | core/src/ota/http.rs:85-98 | Every shorter prefix needs more; the consumed prefix decides alone |
| HeadGrammar.StatusAccepted | core/src/ota/http.rs:152-176 | A status line is accepted with a value exactly when it is the version, a digit string of that 16-bit value, a space and a reason that is not blank |
| HeadGrammar.HeaderAccepted | core/src/ota/http.rs:178-208 | A header line says just what its parts say: a name in front of the first colon that spells content-length or transfer-encoding in any mix of cases between white space, and a padded 64-bit digit string behind it; any other name says nothing |
| HeadGrammar.BadHeader | core/src/ota/http.rs:178-205 | A header line is malformed exactly when it has no colon, or names a content length whose value is not a 64-bit number |
| HeadGrammar.RenderSplits | core/src/ota/http.rs:99-127 | Splitting at LF and dropping one CR undoes writing lines with either terminator |
| HeadGrammar.SplitRenders | core/src/ota/http.rs:99-127 | Every stream is the rendering of its lines followed by its unfinished line |
| Transport.Get | app/src/ota/transport.rs:222-258 | For every fragmentation: success means the stream starts with that head, and over-read bytes followed by the link's rest are exactly the stream behind it; a leftover overflow needs a buffer shorter than 255 bytes |
| Transport.FeedFragment | app/src/ota/transport.rs:243-256 | A fragment is pushed up to and including its first deciding byte, or whole |
| Transport.ReadFragment | app/src/ota/transport.rs:238-257 | One turn of the loop loses no byte between parser, buffer and link |
| Transport.ReadSmall | app/src/ota/transport.rs:195-218 | A small body is a prefix of the stream behind the head, short only when the stream ended; the length is cut to 32 bits first |
| Transport.Usize | app/src/ota/transport.rs:203 | The cut to 32 bits keeps the low 32 bits, so any smaller number is itself |
| Transport.HttpBody.Read | app/src/ota/transport.rs:274-286 | Reads hand out the next bytes of the body stream, none lost, repeated or reordered, and nothing only at its end |
| Transport.Link.Read | app/src/ota/transport.rs:260-265 | A read gives any nonempty piece of what is coming, nothing at the end, or fails |
| Transport.Link.Send | app/src/ota/transport.rs:227-234 | The request goes out whole or the send fails |
| Session.ApplyUpdate | core/src/ota/session.rs:46-98 | For any reader and any flash: the exact outcome of each result, what was taken, written and marked; an oversize image touches neither side; a stalled or failing side never commits |
| Session.Stream | core/src/ota/session.rs:59-86 | The loop ends for any reader since the missing byte count falls each turn, and stores exactly what it took |
| Session.Pump | core/src/ota/session.rs:68-85 | One turn takes at most the missing bytes and stores them right behind the stored ones, or stops with the matching error |
| Session.Store | core/src/ota/session.rs:81-85 | A write at the running offset extends the stored prefix; a failed one leaves the earlier prefix intact |
| Session.Commit | core/src/ota/session.rs:88-97 | Marks only a whole image with the expected digest |
| Session.Reader.Read | core/src/ota/session.rs:24-29 | The reader trait: end of stream, an error, the next bytes, or even a count above what was asked for |
| Session.StoresContiguous | core/src/ota/session.rs:79-85 | Each stored piece starts where the one before ended, from 0 to the end of the image |
| Session.CommitLast | core/src/ota/session.rs:41-45 | A run makes at most one successful mark, as its last call, with the whole image in flash under a matching digest |
| UpdateTask.CheckAndUpdate | app/src/ota/task.rs:47-199 | Flash is called only after a differing version, that version's checksum and a 200 head for that version's image were accepted; a reset happens only with the declared body stored whole under the published digest and committed last; nothing else commits; a failed session left a front part of the body; the leftover and too-long errors cannot occur; every early end but a failed connection is explained by what was sent or configured |
| UpdateTask.Install | app/src/ota/task.rs:179-198 | When link and flash do not fail, it commits exactly the bodies that are long enough, fit the slot and have the digest |
| UpdateTask.Fetch | app/src/ota/task.rs:155-171 | The request sent is the one for that name and what follows the head is the body; a failure is a request or credentials too long, a stream that ends before its head, a head rejected for just that reason, or the connection's own |
| UpdateTask.FetchText | app/src/ota/task.rs:68-106 | A small file is read as a bounded front part of the body behind a 200 head; other statuses give nothing; an over-long one is refused; other failures are those of the fetch |
| UpdateTask.SmallBodyWhole | app/src/ota/transport.rs:203-216 | A declared length below 2^32 is read whole, or as far as the stream goes |
| UpdateTask.LengthDeclared | app/src/ota/task.rs:172-176 | A complete head that is not a 404 declares a length, so the missing-length error behind a 200 never happens |
| UpdateTask.BuildRequest | app/src/ota/transport.rs:288-312 | The request text exactly, credentials only when one of them is set, and which part overflows its buffer; what a server reads off that text is `UpdateRequest.RequestRead` |
| UpdateRequest.RequestRead | app/src/ota/transport.rs:288-312 | For every accepted URL, every file the check asks for and all credentials, a server reads off the request a GET for that file under the URL's path in HTTP/1.0, with the URL's host, the decodable credentials exactly when one of them is set, a request to close, and nothing behind the blank line |
| RequestReader.RequestReads | app/src/ota/transport.rs:294-311 | Reading by section 5 of RFC 1945 gives back the method, target, version and header fields a request was written from |
| UpdateTask.AuthHeader | app/src/ota/transport.rs:303-309 | The authorization line, or nothing when it does not fit 192 bytes |
| UpdateTask.TextBuf.Write | app/src/ota/mod.rs:75-85 | A write that fits appends, one that does not changes nothing |
| FaultPattern.WindowShare | core/src/lamp.rs:32-37 | Any window of k cycles at any offset has 1700k lit milliseconds and 2k falling edges |
| FaultPattern.NextChange | core/src/lamp.rs:28-37 | From any moment the next change is at most 1500 ms away when lit, 150 ms when dark, with one level until then |
| FaultPattern.ChangesApart | core/src/lamp.rs:14-26 | Two changes are at least 150 ms apart |
| FaultPattern.NoPhaseSkipped | app/src/lamp.rs:92-103 | Driven at most 150 ms apart, a write-on-change pin is written once per change of the pattern |
| FaultPattern.WiderGapSkips | app/src/lamp.rs:92-103 | At 151 ms a whole dark phase can pass unseen |
| LampControl.LampMachine.constructor | core/src/lamp.rs:61-70 | At boot the machine is faulted, counting from 0, with nothing applied |
| LampControl.LampMachine.OnFact | core/src/lamp.rs:72-78 | A fact keeps the machine equal to the closed form over its history |
| LampControl.LampMachine.OnLinkDown | core/src/lamp.rs:80-85 | So does a link-down, which restarts the pattern |
| LampControl.LampMachine.OnTick | core/src/lamp.rs:87-96 | So does a tick, which faults exactly at a leash after the last fact |
| LampControl.LampMachine.Apply | core/src/lamp.rs:107-114 | Dispatch appends the event to the history |
| LampControl.LampMachine.Level | core/src/lamp.rs:98-105 | The level is the one the whole history calls for: the last fact's, or the pattern counted from the last link-down, the first tripping tick, or boot; faulted exactly by the closed form |
| LampControl.TickEffect | core/src/lamp.rs:87-96 | A tick never clears a fault or moves its start; it raises one exactly when it trips |
| LampControl.TicksKeepPattern | core/src/lamp.rs:87-105 | However many ticks follow, a fault stays and its pattern goes on from where it started |
| LampControl.ShowsUnique | core/src/lamp.rs:98-105 | The closed form determines the level |
| LampControl.StaleFactBound | core/src/lamp.rs:87-96 | With ticks applied at most d ms apart the machine is unfaulted for less than 30000 + d ms after its last fact |
| LampOwner.EventQueue.Post | app/src/lamp.rs:35-56 | An event is accepted behind all accepted before it, or lost exactly when eight accepted ones have not been taken |
| LampOwner.EventQueue.Receive | app/src/lamp.rs:114 | Accepted events come out in the order they were accepted, each once |
| LampOwner.Lamp.constructor | app/src/lamp.rs:75-88 | The pin starts dark for either polarity |
| LampOwner.Lamp.Drive | app/src/lamp.rs:90-103 | The pin ends at the level the history calls for, for either polarity, and is written only on change |
| LampOwner.Lamp.Turn | app/src/lamp.rs:113-123 | One turn takes the oldest event, applies it and shows the result at the same instant |
| LampOwner.WritesAlternate | app/src/lamp.rs:99-102 | Successive writes differ, and the pin holds the level last driven |
| LampOwner.PinFollowsPattern | app/src/lamp.rs:90-133 | Over any stretch in which a faulted lamp applies nothing but ticks, at most 150 ms apart, its pin is written exactly once per change of the pattern counted from the pattern's own start, for either polarity |
| BleSystem.Peripheral.Turn | app/src/ble.rs:106-195 | Each event does to the peripheral loop and the queue what the step machine says |
| BleSystem.Peripheral.OnWrite | app/src/ble.rs:148-185 | A write request, a failed accept or data other than the one byte 0 or 1 posts nothing; the byte 0 posts intact and the byte 1 posts broken |
| BleSystem.WritePosts | core/src/contract.rs:29-38 | A write does nothing but post intact for the single byte 0 and broken for the single byte 1, when connected, not a request, and accepted |
| BleSystem.FactsAreWrites | app/src/ble.rs:148-185 | In every run a post says intact, or broken, exactly when an accepted one-byte write command of 0, or of 1, in the connected loop made it |
| BleSystem.LampShowsByte | core/src/lamp.rs:98-105 | In every run an unfaulted lamp is lit exactly when the accepted write behind the last applied fact carried the byte 1, and dark exactly when it carried 0 |
| BleSystem.AlwaysConserved | app/src/lamp.rs:32-56 | In every run the machine has applied, in order, exactly the posts that got a slot and are no longer queued |
| BleSystem.AlwaysSeparated | app/src/ble.rs:106-195 | In every run facts of different connections have a posted link-down between them, and outside a connection every fact has one behind it |
| BleSystem.DrainsToFaultIff | app/src/lamp.rs:109-124 | For every reachable state, exactly which queues are sure to leave the lamp faulted once drained, at whatever times from the last application on |
| BleSystem.OutsideDrainsToFault | app/src/ble.rs:120-147 | In every run with no link-down lost, whatever else was, draining the queue outside the connected loop leaves the lamp faulted |
| BleSystem.ShownFactIsFresh | app/src/lamp.rs:126-133 | In every run with any posts lost, an unfaulted lamp shows a fact younger than 30000 + d ms when applied ticks are at most d ms apart |
| BleSystem.LostDownShowsFact | app/src/lamp.rs:35-38 | If the lamp task is kept from running for eight writes and a disconnect, which its executor priority is meant to rule out, the link-down is lost and a finished connection's fact stays on show |
| SelfTest.Run | core/src/ota/selftest.rs:51-84 | The report is that of the latched trace, which stops at its first chance and within 121 samples |
| SelfTest.ConfirmedIff | core/src/ota/selftest.rs:57-81 | Confirmed exactly when each mandatory signal shows in some sample up to the first one at or past 30000 ms |
| SelfTest.NetworkIgnored | core/src/ota/selftest.rs:9-11 | Runs that differ only in WiFi and MQTT end at the same turn and time with the same verdict |
| SelfTest.RunOnBoot | app/src/selftest.rs:54-86 | Only a swap boot samples or confirms; it confirms only after both signals, resets when one is missing after the window, and goes on unconfirmed when confirming fails |
| ReleaseServer.Step | deploy.sh:188-241 | The deploy script's remote steps: any bytes while an image is uploaded, any front part of a checksum, any number of deploys interleaved and aborts at every step |
| ReleaseFiles.FileNameOnce | deploy.sh:152-154 | The names of the version file, the images and the checksums are all different |
| ReleaseServer.AlwaysTrueChecksums | deploy.sh:175-193 | In every run each checksum file is a front part of the true checksum text of an image some deploy built |
| ReleaseServer.ReadDigestIsTrue | deploy.sh:175-177 | A digest parsed from any front part of a checksum file is the digest of a built image |
| ReleaseServer.StaysOrderly | deploy.sh:188-241 | The invariant behind it, from any state: what is readable is a whole deploy that every prune spares, and the newest deploy has put there what its step says |
| ReleaseServer.TornChecksum | core/src/ota/mod.rs:138-150 | A torn checksum text fails to parse or already holds the whole digest |
| ReleaseServer.AlwaysAvailable | deploy.sh:191-241 | When each version is startable at its start, what the device reads off the version file is a release whose image and checksum are whole under the names the device asks for, after every step: aborts, half prunes, rollbacks and overlapping prunes included |
| ReleaseServer.StartSafeIff | deploy.sh:109-114 | While no deploy has more than pruning left, every continuation of a start keeps that exactly when the version is too big to be read, or is canonical, is not the announced one and is spared by every prune going on |
| ReleaseServer.DeviceFindsIff | deploy.sh:109-114 | A VERSION leads the device to its own files exactly when it is canonical and fits 32 bits |
| ReleaseServer.LeadingZeroIsLost | deploy.sh:109-114 | VERSION 007 is accepted and announced as 7, whose files have other names |
| ReleaseServer.RepublishTears | deploy.sh:191-193 | Uploading the announced version again makes the announced image incomplete at once |
| ReleaseServer.ConcurrentPruneTears | deploy.sh:223-237 | A prune that does not spare the announced version, such as an older deploy's still going on, removes the announced image |
| ReleaseServer.RacingStartTears | deploy.sh:204-237 | Starting a newer version while an older deploy has published but not begun its prune is unsafe |
| ReleaseServer.RemoteDir.FindPrev | deploy.sh:208-222 | The first loop finds the largest number below the version among the images |
| ReleaseServer.RemoteDir.DeleteOthers | deploy.sh:223-237 | The second loop deletes only unspared pairs, and all of them unless it fails |
| ReleaseServer.RemoteDir.Prune | deploy.sh:198-238 | A completed prune leaves, of the numbered images, exactly the current number and the largest below it; an aborted one never touches those |
| ReleaseServer.PruneCovered | deploy.sh:204-238 | Whatever a finished or failed prune leaves behind, a run of the step machine leaves behind |
| ReleaseServer.LargestBelowUnique | deploy.sh:217-221 | The previous version is determined by the directory |
| ReleaseServer.BashNumberExact | deploy.sh:216 | The shell's number is the written one exactly below 2^63 |
| Lifecycle.Step | app/src/main.rs:120-124 | The device between resets: self-test first, then the update task's three fetches and its mark, against a server that deploys keep changing; writes in an open trial are taken or refused as the bootloader library does |
| Lifecycle.AlwaysJustified | app/src/ota/task.rs:117-198 | In every run a mark means the digest matched and is the digest of an image some deploy built |
| Lifecycle.MarkedIsBuilt | core/src/ota/session.rs:91-97 | Without a collision against a built image, a marked image is byte for byte a built one, in every interleaving |
| Lifecycle.AlwaysSafe | README.md:149-159 | In every run in which no download writes into an open trial, with a reset possible at every step: the confirmed image is in the active slot or, during a trial, in the DFU partition, and every confirmation was earned in its own trial boot |
| Lifecycle.SettledIsTrustworthy | app/src/selftest.rs:70-79 | In every such run, and with no collision against a built image: once settled, the running image came with the device or was built, matched its digest when marked, was swapped in right after, and showed both mandatory signals in that very boot before being confirmed |
| Lifecycle.UnconfirmedIsUndone | README.md:156-157 | In every such run an image not confirmed by the next reset is replaced by the one confirmed last |
| Lifecycle.SelfTestKeepsBackup | app/src/main.rs:120-122 | In every such run the DFU partition holds the image to fall back to throughout the self-test |
| Lifecycle.RefusingIsSafe | app/src/update.rs:195-207 | If the bootloader library refuses writes in a trial, every settled image is trustworthy in every run without collisions, failed confirmations and downloads at any time included |
| Lifecycle.ClosedTrials | app/src/selftest.rs:57-85 | If after a failed confirmation or an unreadable boot state a reset comes before the next download, no download writes into an open trial |
| Lifecycle.ClosedTrialsAreSafe | app/src/selftest.rs:57-85 | Under that condition, without collisions, every settled image is trustworthy, whatever the bootloader library does |
| Lifecycle.DownloadSafeIff | app/src/update.rs:195-207 | After any run without a write in a trial and without collisions, downloading a body nobody built that does not match, and resetting, leaves an untrustworthy settled image if and only if writes in a trial are taken, the trial is open and the device has a digest |
| Lifecycle.TrialWriteIsFinal | app/src/update.rs:195-207 | Where writes in a trial are taken, a download while one is open settles at the next reset, matching digest or not |
| Lifecycle.FailedConfirmationCanSettleAnything | app/src/selftest.rs:71-74 | Where writes in a trial are taken, one honest release, one failed confirmation and one bad download settle the device on bytes nobody built |
| Lifecycle.CheckCovered | app/src/ota/task.rs:68-198 | An update check whose server answers each request with the file of the name asked for is a run of this machine, whatever deploys do between the fetches: a commit is its mark of the same body, a stopped session its unmarked download of what was left in the partition, an earlier end its giving up |
| Lifecycle.RequestsAsk | app/src/ota/task.rs:68-166 | The request of each of the three fetches asks, read by a server, for just the file the machine's fetch stands for |
| Lifecycle.SelfTestCovered | app/src/selftest.rs:54-86 | Every self-test the boot code can run on a swap boot is a run of this machine with just its sightings, confirming, rebooting or going on exactly as the boot code does |
| Base64.Base64Fill | core/src/ota/mod.rs:182-213 | The byte-fed loop writes the encoding of what the source yields, or fails exactly when the whole does not fit |
| Base64.FillQuad | core/src/ota/mod.rs:186-212 | One turn writes the next four characters of the whole encoding, or finds the source dry, or finds that the whole does not fit |
| Base64.EncodeInto | core/src/ota/mod.rs:160-163 | The slice form: the encoding or nothing, by room |
| Base64.EncodeLength | core/src/ota/mod.rs:184-213 | The length is four characters for every three bytes, rounded up |
| Base64.DecodeEncode | core/src/ota/mod.rs:160-163 | Decoding by section 4 of RFC 4648 gives back every input |
| Base64.EncodeDecode | core/src/ota/mod.rs:160-163 | Each text that strict decoding accepts is the encoding of what it decodes to |
| Base64.AlphabetTable | core/src/ota/mod.rs:182 | The sixty-four characters are those of table 1 of RFC 4648, in its order |
| Base64.Regroup | core/src/ota/mod.rs:198-205 | The four indices are the standard regrouping of the bits of three bytes |
| Base64.BasicAuthorization | core/src/ota/mod.rs:165-180 | Nothing for empty credentials or too little room, else the whole credentials text of section 2 of RFC 7617 |
| Base64.CredentialsRecovered | core/src/ota/mod.rs:165-180 | User and password come back from the text when the user holds no colon |
| Base64.ColonIsAmbiguous | core/src/ota/mod.rs:174-178 | With a colon in the user another pair gives the same text |
| Decimal.ParseVersion | core/src/ota/mod.rs:126-136 | The checked digit loop accepts exactly trimmed digit strings whose full value fits 32 bits |
| Decimal.VersionRoundTrip | core/src/ota/mod.rs:126-136 | Printing then parsing gives the number back under any ASCII whitespace, exactly for 32-bit numbers |
| Decimal.VersionIff | core/src/ota/mod.rs:126-136 | A text is read as a version exactly when it is white space around digits of that value, within 32 bits |
| Decimal.PrefixAtMost | core/src/ota/mod.rs:131-134 | A prefix never exceeds the whole, so a digit-wise overflow check is exact |
| Decimal.CanonicalPrints | core/src/ota/mod.rs:126-136 | Printing undoes parsing exactly for strings without needless leading zeros |
| Decimal.ParseSha256Hex | core/src/ota/mod.rs:138-158 | Accepts exactly the texts whose trimmed form is the lowercase hexadecimal of a digest, and returns it |
| Decimal.ShaRoundTrip | core/src/ota/mod.rs:138-158 | The hexadecimal text of a digest reads back under any ASCII whitespace |
| Decimal.HexInjective | core/src/ota/mod.rs:152-158 | Hexadecimal text determines the bytes |
| Decimal.HexTable | core/src/ota/mod.rs:152-158 | Each value is written as the character at its place in 0123456789abcdef and read back from it |
| Decimal.HexOnly | core/src/ota/mod.rs:152-158 | Nothing but the sixteen characters of 0123456789abcdef is read as a digit |
| Bytes.TrimAscii | core/src/ota/mod.rs:215-225 | The two index loops remove the whitespace at both ends |
| Bytes.TrimSplits | core/src/ota/mod.rs:215-225 | Only whitespace is removed, and only at the ends |
| Url.ParseUrl | core/src/ota/mod.rs:65-99 | The parser agrees with the URL's meaning on every input, errors in the same order; that meaning is given by parts in `UrlShape.UrlIff` |
| Url.FillPath | core/src/ota/mod.rs:81-91 | The path loop fails exactly on an invalid segment or a joined path over 192 bytes |
| Url.AcceptedPath | core/src/ota/mod.rs:81-98 | An accepted path is the nonempty prefix segments and the project behind single slashes, ASCII and at most 192 bytes |
| Url.CanonicalReparses | core/src/ota/mod.rs:65-116 | The canonical text of an accepted URL is accepted again and means the same |
| Url.RenderedAuthority | core/src/ota/mod.rs:101-116 | A rendered host and port parse back |
| UrlShape.UrlIff | core/src/ota/mod.rs:65-116 | The reading of a base URL is what its parts say: scheme, host, an optional port text behind the last colon, and a path; the first fault in a fixed order decides the error |
| UrlShape.DefaultPort | core/src/ota/mod.rs:110 | Leaving the port out means the same as writing 443 for https and 80 for http, for every host, path and project |
| UrlShape.HostBytes | core/src/ota/mod.rs:118-124 | Hosts and path segments are made of letters, digits, dots, hyphens and underscores |
| MemoryMap.StripComments | bootloader/build.rs:196-220 | The peeking character loop agrees with the recursive description of stripping |
| MemoryMap.StripIsCommentFree | bootloader/build.rs:196-220 | The output opens no comment anywhere, not even where a removed comment joined two pieces |
| MemoryMap.StripIdempotent | bootloader/build.rs:196-220 | Stripping twice is stripping once |
| MemoryMap.StripBlock | bootloader/build.rs:200-207 | A block comment vanishes between what stands before and after it |
| MemoryMap.StripLineComment | bootloader/build.rs:208-214 | A line comment vanishes but for its newline |
| MemoryMap.EvalExpr | bootloader/build.rs:157-174 | The one-pass evaluator gives the signed sum the text denotes, cut to 32 bits, and panics exactly on a malformed term |
| MemoryMap.TermReads | bootloader/build.rs:176-194 | A printed decimal or hexadecimal term, digits of either case, with or without K or M of either case, reads back with its value |
| MemoryMap.NumDigitsNumber | bootloader/build.rs:182-192 | The digits of every number, in either radix and case, read back as that number |
| MemoryMap.TermIff | bootloader/build.rs:176-194 | A term is accepted with a value exactly when it is written as one: decimal or hexadecimal digits in any mix of cases, blanks around them, and an optional K or M |
| MemoryMap.SumReads | bootloader/build.rs:157-194 | Any printed signed sum, with any blanks, evaluates to its value |
| MemoryMap.LeadingPlus | bootloader/build.rs:159-168 | The first term may go without its plus |
| MemoryMap.EvalsToValue | bootloader/build.rs:157-174 | So the evaluator returns the value itself whenever it fits 32 bits |
| MemoryMap.MalformedIff | bootloader/build.rs:157-174 | An expression is malformed exactly when some stretch between its signs is neither blank nor a term |
| Partition.ParseMemoryX | bootloader/build.rs:124-149 | The reader gives the table the text declares, or panics where it does |
| Partition.ParseLines | bootloader/build.rs:133-148 | The line loop gives the table of the lines, later lines winning; what a line says is `Partition.LineIff`, and which table it makes `Partition.RegionsRead` |
| Partition.LineIff | bootloader/build.rs:133-155 | A line declares a region exactly when it has a nonblank name in front of its first colon and both keys have values, each the expression from behind the key's equals sign up to a comma; it stops the build exactly when the origin's expression is malformed, or the origin has one and the length's is malformed |
| Partition.RegionLineReads | bootloader/build.rs:134-155 | A written region line reads back with the values of its two expressions |
| Partition.FileReads | bootloader/build.rs:124-149 | A file with any comments anywhere reads back as the table its lines declare, given that what stands before the block holds no capital M, nothing between the word and the brace a brace, and the lines no closing brace |
| Partition.CommentedFileReads | bootloader/memory.x:1-16 | So does a file that opens with a block comment, as the bootloader's does |
| Partition.RegionsRead | bootloader/build.rs:124-149 | A file whose block holds region lines and blank lines reads as the table with just the declared names, each with the origin and the length of the last line declaring it, given the same of what stands around the block |
| Partition.Validate | bootloader/build.rs:41-117 | The build goes on exactly when the table can be read, is acceptable, all six symbols are named, and every line that sets one refers to an origin |
| Partition.CheckRegions | bootloader/build.rs:44-104 | Accepts exactly the acceptable tables, and each complaint names a problem that is there |
| Partition.CheckSymbols | bootloader/build.rs:106-116 | The two symbol loops over the text with its comments in place |
| Partition.FlashRelativeIff | bootloader/build.rs:111-116 | A line is in order exactly when it does not start, behind blanks, as a bootloader symbol does, or refers to an origin somewhere |
| Partition.MentionsIff | bootloader/build.rs:107-113 | Searching finds a text exactly when it occurs somewhere |
| Partition.AcceptedDisjoint | bootloader/build.rs:93-104 | The adjacent-pair check on the sorted list makes all accepted regions pairwise disjoint |
| Partition.OverlapCheckExact | bootloader/build.rs:93-104 | For nonempty regions the check passes exactly when all pairs are disjoint |
| Partition.SortSorts | bootloader/build.rs:97 | Sorting by origin orders the regions and keeps them |
| Partition.AcceptedInFlashIff | bootloader/build.rs:50-58 | An accepted table of nonempty regions lies in flash exactly when the lowest origin is not below the flash base |
| Partition.LowTableAccepted | bootloader/build.rs:50-58 | A table wholly below flash is accepted |
| Partition.ShippedTableAccepted | bootloader/memory.x:9-16 | The bootloader's own table is accepted and its five partitions lie in flash |
| ShippedMap.ShippedReads | bootloader/memory.x:1-16 | The bootloader's own block, as written, reads as the table that is accepted, whatever the leading comment says and whatever comment-free text follows |
| Uf2.Build | scripts/make_uf2.py:20-40 | Fails exactly when a 32-bit field overflows; else the blocks of the image in which the last listed file covering an address decides and gaps are zero |
| Uf2.Overlay | scripts/make_uf2.py:26-29 | The overlay loop: later files win, nothing falls outside |
| Uf2.ImageEndLeast | scripts/make_uf2.py:22-25 | The image ends at the first whole payload that no file reaches beyond |
| Uf2.MakeBlock | scripts/make_uf2.py:34-38 | A block is 512 bytes with header words, payload and end mark in place |
| Uf2.Cut | scripts/make_uf2.py:30-40 | The blocks are numbered linearly, at successive addresses, with the right total |
| Uf2.BlockReads | scripts/make_uf2.py:34-38 | A loader reads back address, payload, number and total |
| Uf2.BlockMagic | scripts/make_uf2.py:35-36 | A block opens with the bytes of UF2 and a newline, and its address is written low byte first |
| Uf2.ReplayGivesImage | scripts/make_uf2.py:32-39 | Replaying the blocks writes exactly the image, at exactly its addresses |
| Uf2.ReplayHolds | scripts/make_uf2.py:20-40 | End to end: after a replay each address holds the last listed file's byte, or zero in a gap |
| Uf2.HoldsUnique | scripts/make_uf2.py:27-29 | The byte at an address is determined |

## Left out

- Name resolution, TCP, TLS and timeouts: opening a connection succeeds or fails as `Unreachable`, and any operation on
  it may fail; which of those errors comes first when the request does not fit either is not modelled.
- SHA-256 itself: any function from byte strings to 32 bytes; where bytes are concluded from digests, the theorem asks
  that no downloaded string collides with a built image.
- The bootloader's own code: it is not part of the repository; its documented contract is used, with a swap that is done
  or not done, and the DFU-detach mode does not occur in the life cycle. What its library does about writes while a swap
  is unconfirmed is a parameter.
- Session.Reader.Read: reading through a trait is a choice between the HTTP body and one arbitrary reader.
- Lifecycle.Step: the device may get any front part of a file, a GET of a missing file leaves it idle, and it does not
  compare the version with its own; this allows more runs than the code has, and the comparison is in
  `UpdateTask.CheckAndUpdate`.
- Lifecycle.UnconfirmedIsUndone: nothing is claimed about what is fetched afterwards; a reverted device fetches the same
  image again.
- ReleaseServer.Step: a checksum being uploaded is a front part of the new text, without the tail of an older file under
  it, and the version file is empty, then whole: both are shorter than one write. The local build, the environment file
  and quoting are not modelled.
- ReleaseServer.RemoteDir.Prune: names are those in the directory when each loop starts, so a deploy racing with the
  loops is covered by the step machine only.
- Transport.ReadSmall: a body cut short is returned as it is, so a version may be read as a shorter number; the digest
  check is what protects the image.
- UpdateTask.BuildRequest: file names are formatted without their 48-byte buffer, which every 32-bit version fits.
- BleSystem.Peripheral.Turn: advertising data, connection parameters, GATT reads and the host runner do nothing to the
  lamp and are absent; the waits between retries take no modelled time.
- BleSystem.LostDownShowsFact: no timing of the executors; that the lamp task can be starved is assumed, not shown.
- LampOwner.Lamp.Turn: the latency stamp and the ready flag; the ready flag is the self-test's lamp signal, which is
  arbitrary there.
- Partition.Validate: a 32-bit overflow of origin plus length, which is mathematical here.
- Partition.FileReads: a capital M or a brace in front of the block, where the reader would look in the wrong place; the
  same holds for `Partition.RegionsRead`.
- MemoryMap.EvalExpr: a sum or a scaled term beyond 64 bits is mathematical here; trimming knows the ASCII white space
  and not the rest of Unicode's.
- Uf2.Build: reading the files and the command line.
- Telemetry, network supervision, sensor, memory budget, LED codes, logging, the watchdog and bench programs: small
  counters and input or output around the parts above.

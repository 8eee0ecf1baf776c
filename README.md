# Reface DX librarian: the SysEx transfer core

This project models the protocol core of `librarian.py`, a small Tkinter
librarian for the Yamaha Reface DX synthesizer. The model covers these parts:

- **The parameter address table** `PARAMETERS`. It has 10 name addresses,
  23 common-voice addresses and four operator blocks of 25. Its length
  `SYX_SIZE` is the size of a patch file.
- **The identity handshake.** The program sends the Device Inquiry of the
  MIDI 1.0 Detailed Specification (`F0 7E 01 06 01 F7`). It drops incoming
  messages until one starts with `0xF0`, then compares that message byte for
  byte with the Reface DX identity `DX_ID_VALID`.
- **The four device operations** behind the buttons:
  - "Upload to DX" (`UploadSelected`): one parameter change per table entry,
    each followed by one reply of any kind.
  - "Save As" (`RequestPatch`): one dump request per table entry, each
    followed by a wait for a SysEx reply. The reply's second-to-last byte
    goes into the next unfilled slot.
  - "Get Name" (`GetPatchName`) and "Set Name" (`SetPatchName`): the same
    loops over the ten name entries.
- **The name strings.** Bytes are turned into a name with `chr`. The
  suggested file name uses `strip`, `replace('/', '')`, `replace('\\', '£')`
  and `.syx`. The name shown after "Get Name" is not stripped. "Set Name"
  pads with ten spaces and cuts to ten codes.

## How the model is built

The MIDI port is a `MidiPort` object (`midi.dfy`). It has a finite stream
of incoming messages read through a cursor, and a log of sent messages.

- A message is either `SysEx(data)`, whose raw bytes are
  `[0xF0] + data + [0xF7]`, or another message whose status byte is never
  `0xF0`. So "first byte is `0xF0`" (the handshake's test) and "type is
  sysex" (the download's test) are the same test.
- A blocking `receive()` on a stream with nothing left stands for a device
  that never answers. The program then waits forever. The model stops there
  with the outcome `Hung` and sends nothing more.
- `for msg in response` ends when the stream is used up. This is the only
  way to reach the program's "did not return sysex parameter" branch. The
  model counts each such step as one warning.

The transfer routines are methods over this port, in the program's order:

- `Transfer.Handshake` and `Transfer.AwaitSysex` hold the receive loops.
- `Librarian.CollectByReceipt` and `Librarian.CollectByStep` hold the two
  dump loops over a zero-initialised array.
- `Librarian.SendParameters` holds the upload loop.
- The four button operations call these.

Each method's contract ties the sent log, the cursor and the buffer to
functions of the incoming stream:

- `IdentityVerdict` is the handshake's judgement.
- `RepliesFrom` gives the values the SysEx replies carry.
- `Fill` is a zero buffer with values written into its first slots.
- `DumpRequests` and `ParameterChanges` are the exact messages sent.
- `UploadSends` and `UploadOutcome` give how far an upload gets.

The lemmas then prove what those functions mean:

- the table's shape;
- the handshake's if-and-only-if;
- the two ways of advancing the slot index;
- that the file name is path-safe;
- the name round trips.

`reference_device.dfy` adds an idealised Reface DX as a partner:

- It keeps one byte per address.
- It answers the identity request with the Reface DX identity.
- It stores each parameter change and acknowledges it with a copy.
- It answers each dump request with a parameter change that carries the
  stored value.

Against this device, the model proves two end-to-end results. "Upload to DX"
followed by "Save As" returns the uploaded patch. "Set Name" followed by
"Get Name" shows the name that was set, padded to ten characters.

### Behaviour of the code worth knowing

- **Short patch file.** An upload of a patch shorter than 133 bytes is not
  rejected up front. The program sends one parameter change per byte it has.
  It then fails with `IndexError` at the first missing index
  (`Outcome.IndexError`). A longer file is sent only up to 133 bytes.
- **No timeouts.** A missing reply during the handshake or an upload blocks
  forever (`Hung`). For a dump reply the model reads the end of the finite
  incoming stream as the end of `for msg in response`, so a missing dump
  reply adds a warning. On a real open port mido's blocking iteration would
  keep waiting instead.
- **Two slot disciplines.** In "Save As" the slot index advances only when
  a value arrives; "Get Name" advances it on every step. Had a step missed
  and a later one obtained a value, "Save As" would put that value one slot
  early (`InteriorMissShifts`, stated on abstract step outcomes, as for a
  hypothetical non-blocking port). The program as written cannot get there.
  `for msg in response` blocks on an open port, so a late reply fills the
  step that is still waiting. A step misses only when the iteration ends,
  and then every later step misses too. Misses therefore only trail, and
  both disciplines fill the same buffer (`DrainedPortFillsAlike`).
- **`strip()` removes both ends.** It removes leading as well as trailing
  whitespace.
- **`\` becomes `£`.** A backslash is replaced by `£`, not removed. So
  `Lead/1\` gives `Lead1£`.
- **"Get Name" does not strip.** A name set as `Lead X` comes back as
  `Lead X` followed by four spaces.

## Model

| member | source | states |
|---|---|---|
| ParameterTable.Block | librarian.py:28-33 | the block is exactly the addresses (high, mid, x) for x in range(lo, hi), in order |
| ParameterTable.TableSize | librarian.py:28-36 | the blocks have 10, 23 and 4 x 25 entries, so SYX_SIZE is 133 |
| ParameterTable.TableShape | librarian.py:35-36 | PARAMETERS is name, globals, then operators 1 to 4 at indices 0-9, 10-32, 33-57, 58-82, 83-107 and 108-132 |
| ParameterTable.NameBlockIsPrefix | librarian.py:28-35 | DXP_NAME is the first ten entries of PARAMETERS, so the name transfer is a prefix of the full transfer |
| ParameterTable.ParameterAt | librarian.py:28-35 | entry i is (0x30,0,i) below 10, (0x30,0,0x0C+(i-10)) from 10 to 32, and (0x31,k,j) in operator block k |
| ParameterTable.OperatorParameterAt | librarian.py:30-35 | entry 33+25k+j is (0x31,k,j) for every k < 4 and j < 25 |
| ParameterTable.TableIndex | librarian.py:28-35 | decodes an address to a table position below 133, or None for an address outside the table |
| ParameterTable.TableIndexFinds | librarian.py:28-35 | TableIndex finds every table entry at its own index |
| ParameterTable.TableIndexPlaces | librarian.py:28-35 | every address TableIndex places is the table entry at that place |
| ParameterTable.AddressesDistinct | librarian.py:28-35 | no two table entries share an address, so each parameter is transferred once |
| Midi.Bytes | librarian.py:129 | raw bytes start with 0xF0 exactly for SysEx messages, and SysEx bytes end with 0xF7 |
| Midi.ParameterValueIsPenultimate | librarian.py:181-182 | the stored reply value is the second-to-last raw byte of the reply |
| Midi.RepliesFrom | librarian.py:179-182 | at most one value per remaining message, and no value at all exactly when no SysEx message is left |
| Midi.FirstSysex | librarian.py:179-185 | the first SysEx position at or after pos: every message before it is not SysEx, and it is SysEx unless the stream ends |
| Midi.PastReply | librarian.py:179-185 | one wait for a SysEx reply consumes up to and including that reply, or the whole stream |
| Midi.AfterReplies | librarian.py:175-185 | the cursor after n successive waits lies between pos and the end of the stream |
| Midi.FirstReply | librarian.py:179-185 | the values still to come start with the first SysEx reply's value, and are empty when no SysEx reply is left |
| Midi.AllReplies | librarian.py:179-185 | when every message is SysEx, each one yields one value in order |
| Midi.MidiPort.constructor | librarian.py:123-124 | an opened port has read nothing and sent nothing |
| Midi.MidiPort.Send | librarian.py:126 | send appends exactly that message to the log and reads nothing |
| Midi.MidiPort.Receive | librarian.py:128 | receive takes the next incoming message, or none when the device has nothing more to send |
| VoiceName.Decode | librarian.py:196-198 | the name has one character per byte, and each character's code is that byte |
| VoiceName.DecodeName | librarian.py:196-198 | the character-by-character loop builds exactly Decode of the bytes |
| VoiceName.EncodeName | librarian.py:269-271 | exactly ten codes: ord of the name's characters, then space codes up to ten |
| VoiceName.NameCodes | librarian.py:265-271 | the append loop builds exactly EncodeName of the name |
| VoiceName.IsSpace | librarian.py:199 | tab, line feed, vertical tab, form feed, carriage return and space are whitespace for strip; digits and ASCII letters are not |
| VoiceName.StripLeading | librarian.py:199 | removes a prefix made only of whitespace and leaves a string not starting with whitespace |
| VoiceName.StripTrailing | librarian.py:199 | removes a suffix made only of whitespace and leaves a string not ending with whitespace |
| VoiceName.Strip | librarian.py:199 | the stripped name has no whitespace at either end |
| VoiceName.StripEdges | librarian.py:199 | stripping the leading and then the trailing whitespace leaves no whitespace at either end |
| VoiceName.StripMiddle | librarian.py:199 | the stripped name is the part of s between a whitespace-only prefix and a whitespace-only suffix |
| VoiceName.Replace | librarian.py:199 | Python's str.replace for a one-character pattern; its result is fixed by ReplaceAppend and ReplaceSingle, and described by the lemmas below |
| VoiceName.ReplaceAppend | librarian.py:199 | replace works piece by piece: on a concatenation it is the concatenation of the replacements |
| VoiceName.ReplaceSingle | librarian.py:199 | one character becomes the substitute if it is the pattern and stays otherwise |
| VoiceName.ReplaceAbsent | librarian.py:199 | a string without the pattern is left unchanged |
| VoiceName.ReplaceChars | librarian.py:199 | the result's characters are those of s other than the pattern, plus the substitute's where the pattern occurs |
| VoiceName.ReplaceByChar | librarian.py:199 | replacing by one character keeps the length and changes exactly the positions holding the pattern |
| VoiceName.Sanitize | librarian.py:199 | the sanitised name has no '/' or '\', keeps every other character except that '£' may be added, and leaves a name without separators unchanged |
| VoiceName.SlashDeleted | librarian.py:199 | replace('/', '') deletes the '/' between two pieces that have none |
| VoiceName.SanitizeSeparators | librarian.py:199 | a '/' between separator-free pieces is deleted and a trailing '\' becomes '£' |
| VoiceName.SanitizeExample | librarian.py:199 | the name `Lead/1\` is sanitised to `Lead1£` |
| VoiceName.NameField | librarian.py:197 | voiceBytes[:10] is the first ten bytes, or all of a shorter buffer |
| VoiceName.SuggestedFileName | librarian.py:196-199 | the suggested file name ends in ".syx" and contains no path separator |
| VoiceName.WithExtension | librarian.py:199 | appending ".syx" to a separator-free stem keeps it separator-free and ends in ".syx" |
| VoiceName.DisplayName | librarian.py:254-257 | the name shown has no path separator and, when the bytes hold no '/', one character per byte |
| VoiceName.StripTrailingSpaces | librarian.py:199 | padding spaces after a name that does not end in whitespace are exactly what strip removes |
| VoiceName.DecodePadded | librarian.py:269-271 | a name of at most ten characters comes back from its encoding followed by the padding spaces |
| VoiceName.StripPadded | librarian.py:199 | stripping a padded name without edge whitespace gives the name back |
| VoiceName.SetNameThenFileName | librarian.py:196-199 | a safe name of at most ten characters, once set, is offered back as exactly name + ".syx" |
| VoiceName.SetNameThenDisplay | librarian.py:254-257 | "Get Name" does not strip: a set name is shown followed by its padding spaces |
| VoiceName.LongNameTruncated | librarian.py:270 | a name of ten or more characters is cut to its first ten |
| Transfer.DumpRequestWire | librarian.py:176 | a dump request is F0 43 30 7F 1C 05 high mid low F7 on the wire |
| Transfer.ParameterChangeWire | librarian.py:137 | a parameter change is F0 43 10 7F 1C 05 high mid low value F7, and its parameter value is the value sent |
| Transfer.DumpRequests | librarian.py:175-176 | one dump request 43 30 7F 1C 05 h m l per table entry, in table order |
| Transfer.ParameterChanges | librarian.py:136-137 | one parameter change 43 10 7F 1C 05 h m l v per table entry, with the value at the same index |
| Transfer.Fill | librarian.py:155 | a buffer of the given size holding the values in its first slots and zero in the rest |
| Transfer.IdentityVerdict | librarian.py:128-132 | no reply exactly when no SysEx message is left, and a verified device has sent a message equal to DX_ID_VALID |
| Transfer.FirstSysexUnique | librarian.py:129-130 | any position before which nothing is SysEx, and which is SysEx or the end, is the first SysEx position |
| Transfer.VerifiedIffIdentityFirst | librarian.py:128-132 | the device is accepted iff the first message starting with 0xF0 equals DX_ID_VALID; there is no reply iff no message starts with 0xF0 |
| Transfer.NoiseIgnored | librarian.py:129-130 | messages that are not SysEx ahead of the reply do not change the verdict |
| Transfer.AwaitSysex | librarian.py:179-185 | the wait consumes up to the first SysEx message and returns it, or uses the stream up and returns none |
| Transfer.Handshake | librarian.py:126-132 | sends only DX_ID, consumes up to the first 0xF0 message, and returns IdentityVerdict of the stream |
| Transfer.ReplyStep | librarian.py:179-185 | a wait obtains the next value still to come, or obtains nothing only when none is left |
| Transfer.RequestOne | librarian.py:176-185 | one download step sends one dump request and obtains the next value, or nothing once all values are obtained |
| Transfer.DumpStep | librarian.py:176-185 | one download step stores the obtained value into the next slot, keeping the buffer equal to Fill of the values obtained |
| Librarian.CollectByReceipt | librarian.py:174-189 | sends DumpRequests of the table; the buffer is Fill of the reply values; warnings count the steps without a value |
| Librarian.CollectByStep | librarian.py:239-248 | sends DumpRequests of the name table; slot i holds the value of step i, and steps without a value leave zero |
| Librarian.SendParameters | librarian.py:135-141 | sends ParameterChanges in table order and consumes one message per send; ends Completed, IndexError at the first missing byte, or Hung at the first unanswered send |
| Librarian.UploadSends | librarian.py:136-141 | the changes sent are one per entry up to the shorter of the table and the patch, cut at the first unanswered send, which is itself sent |
| Librarian.UploadOutcome | librarian.py:136-141 | Hung exactly when a reply is missing before the table or the patch ends; IndexError at index len(patch) exactly when the patch is shorter than the table and every send was answered; otherwise Completed |
| Librarian.PatchToUpload | librarian.py:115-121 | the file's bytes when it was read, and otherwise 133 zero bytes |
| Librarian.UploadSelected | librarian.py:109-147 | after a mismatch or no reply nothing but DX_ID is sent; after a match the whole patch (or 133 zeros if the file read failed) is uploaded |
| Librarian.StepOutcomes | librarian.py:179-185 | n steps; step j obtains the j-th SysEx value still to come, or nothing once they run out |
| Librarian.Received | librarian.py:179-185 | at most one value per step, and one value per step exactly when no step misses |
| Librarian.SlotsByReceipt | librarian.py:182-183 | size slots, the received values in order in the first of them and zero in the rest |
| Librarian.SlotsByStep | librarian.py:246-248 | size slots; slot i holds the value of step i, or zero if step i obtained nothing |
| Librarian.ReceivedWhenMissesTrail | librarian.py:179-185 | when no value arrives after a miss, the received values are exactly the values of the leading steps |
| Librarian.AlignedWhenMissesTrail | librarian.py:183 | advancing the slot on receipt and advancing it per step fill the same buffer when misses only trail |
| Librarian.InteriorMissShifts | librarian.py:183 | a miss followed by a value puts the value in slot 0 when advancing on receipt and in slot 1 when advancing per step |
| Librarian.DrainedPortFillsAlike | librarian.py:183 | on a stream that runs dry, both ways of advancing the slot fill the values in order followed by zeros |
| Librarian.RequestPatch | librarian.py:152-199 | no device: nothing sent; mismatch: only DX_ID sent and no file; match: one dump request per entry, patch equals the reply values in order, warnings count the misses, file name from the first ten bytes |
| Librarian.GetPatchName | librarian.py:217-257 | no device shows "Dyna Choir"; mismatch shows the sanitised zero name; match shows the sanitised, unstripped name from the name replies |
| Librarian.SetPatchName | librarian.py:262-299 | after a match the ten EncodeName codes go to the ten name addresses in order; otherwise nothing but DX_ID is sent |
| ReferenceDevice.ParseInverts | librarian.py:19 | the device reads DX_ID, each parameter change and each dump request as what it was built to be, and only from that message |
| ReferenceDevice.IdentityReplyExpected | librarian.py:21 | the device's identity reply is byte for byte DX_ID_VALID |
| ReferenceDevice.ServeSnoc | librarian.py:136-139 | serving one more message adds exactly the device's reaction to it |
| ReferenceDevice.Recall | librarian.py:174-175 | the stored values of the table's addresses, in table order |
| ReferenceDevice.ChangeStep | librarian.py:136-139 | serving the next parameter change stores its value and appends its echo |
| ReferenceDevice.ChangesStored | librarian.py:136-141 | the first n changes over distinct addresses are echoed, store their values, and leave every other address alone |
| ReferenceDevice.ServeChanges | librarian.py:136-141 | a whole upload is echoed change by change and leaves the patch in the device's memory |
| ReferenceDevice.ServeRequests | librarian.py:175-176 | a run of dump requests leaves memory alone and is answered with the stored values in table order |
| ReferenceDevice.ChangesCarry | librarian.py:179-182 | a stream of parameter changes carries exactly their values as reply values |
| ReferenceDevice.IdentityAccepted | librarian.py:128-132 | a stream opening with the device's identity reply is verified and the handshake consumes just that reply |
| ReferenceDevice.HandshakeAccepts | librarian.py:126-132 | the device's replies to a session open with its identity reply, which the handshake verifies |
| ReferenceDevice.UploadTable | librarian.py:126-141 | an upload to the device is verified and completes, and the device then holds the uploaded values |
| ReferenceDevice.DownloadTable | librarian.py:164-185 | a download from the device is verified, leaves its memory alone, and obtains the stored values in order |
| ReferenceDevice.TablesDistinct | librarian.py:28-35 | the full table and the name table have no repeated address |
| ReferenceDevice.RoundTrip | librarian.py:135-185 | uploading values then downloading the same table gives the values back, under either way of advancing the slot |
| ReferenceDevice.UploadThenDownload | librarian.py:109-199 | "Upload to DX" of a 133-byte patch followed by "Save As" downloads the same patch |
| ReferenceDevice.SetNameThenGetName | librarian.py:217-299 | "Set Name" followed by "Get Name" shows the name that was set, padded with spaces to ten characters |

## Left out

- The Tkinter window, buttons, styles, tree view, message boxes, console
  prints and the `easyPatchName` variable. The model returns each result as
  a value instead.
- `RefreshFiles`, `GetTimeLastModified`, `SetMidiDevice` and `RefreshMidi`.
  These are directory listing, time formatting and port enumeration, with no
  protocol logic.
- The file dialog and the binary file read and write. An upload takes the
  file's bytes as an optional parameter: absent means the read failed. A
  download returns the patch bytes and the suggested file name.
- Opening and closing the mido ports. A port is a finite stream plus a send
  log. Raising errors from an unknown or empty device name in "Upload to
  DX" is not modelled.
- mido's check that SysEx data bytes are below 0x80, which raises
  `ValueError` on construction. Values are modelled as bytes below 0x100.
- Librarian.SetPatchName: requires every character of the name to have a
  code below 256. `ord` of a wider character would not fit a data byte, and
  mido would reject it.
- Character handling beyond code points. Names are sequences of characters
  whose codes are the bytes; `str.isspace` is written out for the code
  points it accepts.
- Concurrency and timing. The program is single-threaded, has no timeouts,
  and its blocking waits are the `Hung` outcome.
- Transfer.AwaitSysex: the end of the finite stream stands for the end of
  `for msg in response`. With mido's blocking iteration on an open port,
  that loop would instead keep waiting.

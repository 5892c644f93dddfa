# Verified model of vbus2mqtt

vbus2mqtt reads a RESOL VBus byte stream from a serial line, decodes telegrams into telemetry and publishes it over
MQTT. This project models its logic in Dafny and proves what the code guarantees:

- **The parser** (`bytes`, `wire`, `scanner`, `parser`). `Parser` is a class with the source's buffer. Its invariant
  says that the frames returned so far and the bytes retained are those of the one *declarative parse* of everything
  ever received: the stream is cut into telegrams and junk bytes, a byte is junk only where no continuation could ever
  have a telegram, and the rest is what the parser has not decided yet. The scan is the only such parse, is independent
  of chunking, accounts for every byte, and retains fewer than 1540.
- **Getting back in step** (`recovery`). The parser decides late: it looks at the version byte only once the header is
  complete and at sub-frame checksums only once all of them have arrived. It is shown exactly when it waits in vain, and
  exactly which garbage never costs or delays a frame.
- **The line** (`encoder`, `transmission`, `endtoend`). Pieces after which nothing is retained are exactly the ones that
  leave the reading of everything later untouched. SYNC-free noise, intact telegrams and clean telegrams with one
  contained fault are such pieces, so of any mix of them exactly the intact telegrams come out. Encoded frames
  survive noise and chunking, and telemetry of any registered devices survives the whole way from raw values through
  payload, telegram, noisy line, parser and registry to decoded fields.
- **Field decoding** (`rounding`, `registry`, `layout`). Little-endian and two's-complement reads, scaling and rounding
  to hundredths with every tie determined, the packed-key registry, and when a field table loses no value.
- **The generator** (`names`, `compiler`). VSF descriptions are compiled to field definitions; the compiled field means
  what the description means exactly under a layout condition that the generator does not check. Every
  field that meets it keeps its meaning through the generated registry, its merge with the custom one, and decoding,
  whatever the other fields of its packet are, if no other packet claims the key.
- **The running system** (`config`, `protocol`, `bridge`, `discovery`). The settings store with its file
  and temporary file, the store-then-bump / version-then-config protocol over all interleavings, the read loop's
  last-value table and publish schedule on top of it, and the discovery cache with the publishes that fail.
- **Publishing** (`publishing`, `names`). The payload keys values and units by field name: when it holds every value,
  when units are right, and when two described names become one.
- **All together** (`delivery`). However the line is cut into reads, every publication shows, for exactly the sources
  heard of, the last measurement that has arrived completely, and its payload the values measured.

Bytes are integers below 0x100 and bit operations are written as arithmetic; 8-bit and 64-bit wrap-around is explicit
(`ComputeChecksum`, `Store.Update`, `State.Version`). Factors and values are exact rationals. Serial reads, the clock,
I/O failures and crashes are inputs. `Alphabet` stands for Unicode's letter, digit and lower-case functions; it is
assumed `Lawful` where a result needs that. A persisted duration is assumed to parse back to itself. Payload offsets are
naturals (a negative one would panic). Source steps that are inlined there are separate methods here where that keeps a
proof small (`CheckHead`, `RestoreBits`, `LoadBroker`).

Where the code and its comments disagree, the model follows the code:

- Telegrams are said to have bit 7 clear (`internal/vbus/parser.go:11`), but neither that nor the upper septett bits are
  checked: decoding is injective on canonical telegrams only (`Wire.EncodeDecode`, `Transmission.DecodingNotInjective`).
- After garbage the parser is said to resynchronise; garbage that contains SYNC can still cost the next intact telegram
  (`Transmission.SyncInGarbageLosesTelegram`). Exactly when no frame is lost, invented or delayed, whatever follows, is
  `Recovery.NothingLostIff`, with a harmless and two harmful inputs beside it.
- "Offsets must be consecutive" (`cmd/gen-registry/main.go:325`) is not checked, and a signed single byte "treated as
  Int16" (`cmd/gen-registry/main.go:307`) reads two bytes. `Compiler.CompilationFaithfulIff` has the exact condition,
  `Compiler.GappedPairMisread` and `Compiler.SignedByteMisread` an input each. Four bytes with a signed top byte are
  accepted, too, and read as unsigned (`Compiler.SignedQuadMisread`).
- The generator promises an entry for every known packet (`cmd/gen-registry/main.go:1-2`) but does not look for packets
  that share a key. Keys are calls, so such a literal compiles; the language leaves open which element is evaluated
  last, and that one hides the others (`Compiler.SharedSourceHidesPacket`). `Compiler.PacketRegisteredIff` has the exact
  condition.
- The payload is said to carry the decoded fields by name; equal names collapse, as in a shipped table
  (`Publishing.HeatCollapses`), and a value can come out with the unit of another (`Publishing.StrayUnit`).
  `Publishing.PublishedPacketIff` and `Publishing.UnitsRightIff` have the exact conditions; a repeated name is harmless
  only where the same bytes are read in the same way, as in three shipped tables (`Publishing.TwinsPublished`).
- Saving is called an atomic write (`internal/config/store.go:164`). It is for errors and for crashes of the process,
  but nothing is synced: after a power loss the rename can have reached the disk without the data,
  or have moved a temporary file left over from an earlier save (`Config.LeftoverRevives`). `Config.PowerLossIff` has the
  exact condition.
- Saved settings are said to survive restarts; a setting cleared to empty comes back from the environment
  (`Config.ClearedBrokerReturns`). `Config.RestartLosslessIff` has the exact condition.
- Discovery is said to be published for every pair not announced yet (`internal/mqtt/client.go:170-171`); a pair is
  marked before its publish, so one that fails is not repeated in that connection (`Discovery.FailureIsFinal`).
  `Discovery.DeliveredIff` has the exact condition.
- The version counter is 64 bits wide and the check has a window between an updater's store and its bump;
  `VersionProtocol.NoStaleConfig` holds outside that window and within 2^64 updates; `VersionProtocol.AlwaysFreshIff` has
  the exact condition.

## Model

| member | source | states |
|---|---|---|
| Bytes.ComputeChecksum | internal/vbus/parser.go:163-170 | The 8-bit wrapping loop yields the byte below 0x80 that completes the exact sum of the covered bytes to 0x7F modulo 0x80 |
| Bytes.ChecksumSensitive | internal/vbus/parser.go:163-170 | Replacing one covered byte goes unnoticed if and only if old and new agree in their low seven bits |
| Wire.DecodeEncodeBlocks | internal/vbus/parser.go:139-161 | Septett decoding undoes septett encoding on every payload of whole sub-frames, and the encoder's sub-frame checksums are good |
| Wire.EncodeDecodeBlocks | internal/vbus/parser.go:139-161 | For sub-frames with good checksums, re-encoding the decoded payload gives the received bytes if and only if they were canonical |
| Wire.DecodeEncode | internal/vbus/parser_test.go:19-54 | Up to 255 sub-frames, an encoded frame is a well-formed telegram that decodes to the frame with its payload zero-padded |
| Wire.PaddedWithZeros | internal/vbus/parser_test.go:34-40 | Padding keeps the payload and adds zeros |
| Wire.EncodeDecode | internal/vbus/parser.go:88-122 | A received telegram equals the encoding of its decoded frame if and only if it is canonical |
| Wire.CanonicalInjective | internal/vbus/parser.go:139-161 | Two canonical telegrams that decode alike are equal |
| Encoder.SplitSeptett | internal/vbus/parser_test.go:41-47 | Clears bit 7 of four bytes in place and collects the cleared bits in the septett byte |
| Encoder.BuildFrame | internal/vbus/parser_test.go:19-54 | The loops of the reference encoder compute the encoding function for every payload length |
| VBusParser.DecodeSubFrames | internal/vbus/parser.go:139-161 | Succeeds if and only if every sub-frame checksum is good, and then returns the decoded payload; otherwise nothing |
| VBusParser.CheckHead | internal/vbus/parser.go:76-122 | The checks on a SYNC at the head wait exactly while the header, or the sub-frames a good header announces, are incomplete, whatever has arrived of them; then they accept exactly the well-formed telegrams and reject the rest |
| VBusParser.Parser.Drain | internal/vbus/parser.go:55-136 | Returns the frames of the scan of the buffer and retains exactly its unresolved rest; terminates |
| VBusParser.Parser.Feed | internal/vbus/parser.go:49-52 | Keeps the invariant that all frames returned and the bytes retained are those of the parse of all bytes ever fed |
| VBusParser.FeedChunks | internal/vbus/parser.go:49-52 | A fresh parser fed any chunks returns in total the frames of the whole stream |
| Scanner.ScanRefinesDeclaration | internal/vbus/parser.go:59-132 | A division of a stream is the scan's if and only if it satisfies the declarative reading: telegrams well formed, junk only where no continuation can ever hold a telegram, and the rest a head without a complete header or without all the sub-frames it announces |
| Scanner.SegmentIntervals | internal/vbus/parser.go:59-132 | Segments are adjacent increasing slices of the stream; an emitted telegram starts at its position, and no telegram ever starts at a junk position |
| Scanner.ChunkingInvariance | internal/vbus/parser.go:49-136 | Any way of cutting a stream into reads gives the same frames in the same order and the same retained bytes |
| Scanner.ConcatLaws | internal/vbus/parser.go:49-52 | The stream of some reads has every chunk, whatever its length, in order |
| Scanner.OutputMonotone | internal/vbus/parser.go:49-136 | The frames emitted for a prefix are a prefix of the frames emitted for any extension |
| Scanner.BoundedRetention | internal/vbus/parser.go:59-134 | What is retained is a suffix still waited on, empty or starting with SYNC, shorter than 1540 bytes |
| Scanner.ByteConservation | internal/vbus/parser.go:49-136 | Bytes received = bytes skipped + 10 + 3/2 payload length per emitted frame + bytes retained |
| Recovery.PendingDeadIff | internal/vbus/parser.go:76-112 | The parser waits in vain if and only if an incomplete header already has a wrong version byte or a completely received sub-frame has a bad checksum; otherwise some continuation makes a telegram |
| Recovery.NothingLostIff | internal/vbus/parser.go:59-134 | After a piece no frame is lost, invented or delayed, whatever follows, if and only if what is retained is harmless: nothing, or a hopeless head given up within ten bytes with no frame behind it and a harmless rest |
| Recovery.FalseStartHarmless | internal/vbus/parser.go:76-86 | Concrete garbage that starts with SYNC is retained without ever costing a frame |
| Recovery.FalseHeaderHarmful | internal/vbus/parser.go:88-112 | A concrete false header can cost a frame |
| Recovery.HopelessHeadHarmful | internal/vbus/parser.go:103-122 | So can a head that can no longer become a telegram but announces further sub-frames |
| Transmission.TransparentIff | internal/vbus/parser.go:59-134 | A piece leaves both the frames and the final buffer of every later stream untouched if and only if the parser retains nothing after it |
| Transmission.EncodedCleanIff | internal/vbus/parser_test.go:19-54 | An encoded frame is 7-bit clean after SYNC if and only if its address, command and count bytes are |
| Transmission.FaultSkippedIff | internal/vbus/parser.go:81-132 | A clean telegram with any one byte replaced leaves no trace if and only if the fault is at SYNC, the version or a checksum, or changes a low seven bit, and does not make a SYNC that heads a wait or a telegram; such a SYNC is where reading goes on, and an undetected fault is delivered or, in the count, makes the parser wait |
| Transmission.FaultContainment | internal/vbus/parser.go:81-132 | Of any mix of SYNC-free noise, intact telegrams and clean telegrams with one contained fault (exactly those that leave no trace), exactly the intact ones come out and the buffer ends empty |
| Transmission.SevenBitContainment | internal/vbus/parser.go:81-132 | In particular for every fault that replaces a byte of a clean telegram by another 7-bit value |
| Transmission.Receive | internal/vbus/parser.go:49-136 | The same through the parser object under any chunking |
| Transmission.RoundTripIff | internal/vbus/parser_test.go:19-54 | An encoded frame comes back unchanged if and only if its payload is whole sub-frames and at most 255 of them |
| Transmission.StreamRead | internal/vbus/parser.go:49-161 | A noisy stream of frames of any length comes back in order, each with the sub-frames its one-byte count names |
| Transmission.StreamRoundTrip | internal/vbus/parser.go:49-161 | Frames of whole sub-frames survive encoding, SYNC-free noise and chunking, all and in order |
| Transmission.SampleRead | internal/vbus/parser_test.go:56-75 | A telegram given byte by byte is read as the frame it stands for, addresses and bit 7 included |
| Transmission.SyncInGarbageLosesTelegram | internal/vbus/parser.go:59-132 | Concrete garbage with a false header loses the intact telegram after it |
| Transmission.DecodingNotInjective | internal/vbus/parser.go:151-157 | Distinct well-formed telegrams can decode to the same frame |
| Rounding.ValueNearest | internal/vbus/registry.go:94-116 | A decoded value is within half a hundredth of raw times factor |
| Rounding.ValueIff | internal/vbus/registry.go:116 | The decoded value is h hundredths if and only if h is nearest to a hundred times raw times factor, ties going away from zero; this determines every value |
| Rounding.ValueTie | internal/vbus/registry.go:116 | Half-way between two hundredths the one farther from zero is taken |
| Rounding.ThousandthsTie | internal/vbus/registry.go:116 | With three decimals 5 is decoded to 0.01, 15 to 0.02 and -5 to -0.01 |
| Rounding.ValueMonotone | internal/vbus/registry.go:94-116 | Decoding keeps the order of raw values |
| Rounding.ValueOdd | internal/vbus/registry.go:99-104 | Positive and negative raw values are rounded alike |
| Rounding.RecoverExact | internal/vbus/registry.go:94-116 | With a factor of at least 0.01 the raw value can be computed back from the decoded one |
| Rounding.PrecisionIff | internal/vbus/registry.go:94-116 | A field with p decimals keeps all raw values apart if and only if p is at most 2 |
| Rounding.ExactValue | internal/vbus/registry.go:94-116 | With at most two decimals nothing is rounded |
| Registries.BitFieldsAreDigits | internal/vbus/registry.go:86-93 | The eight bit fields of a byte are its binary digits; other bit indices read zero |
| Registries.PayloadMonotone | internal/vbus/registry.go:68-119 | The telemetry of a shorter payload is an order-preserving part, with equal values, of that of any extension |
| Registries.PKeyInjective | internal/vbus/registry.go:37-39 | Packing three 16-bit addresses loses nothing |
| Registries.Registry.Lookup | internal/vbus/registry.go:41-44 | Looks up in the map on address triples that the packed map stands for |
| Registries.Registry.Register | internal/vbus/registry.go:46-48 | Updates that map at exactly one triple |
| Registries.Registry.AddCustom | internal/vbus/registry_custom.go:9-13 | Custom definitions overwrite, in any iteration order |
| Registries.Registry.AddGenerated | internal/vbus/registry_gen.go:9-15 | Generated definitions only fill gaps, in any iteration order |
| Registries.Initialise | internal/vbus/registry.go:50-54 | Custom entries win over generated ones whichever init function runs first |
| Registries.Decode | internal/vbus/registry.go:62-82 | Known exactly when the address triple is registered; then the device's fields that fit, in definition order, each with the value that Rounding.ValueIff determines; otherwise the formatted source and no fields |
| Registries.HalfHundredthRead | internal/vbus/registry_gen.go:22 | A reading half-way between two hundredths is decoded to the one farther from zero |
| Layout.ReadBack | internal/vbus/registry.go:84-119 | Among fields that do not overlap, every raw value written little-endian is read back, whatever is written to the others |
| Layout.FaithfulIff | internal/vbus/registry.go:62-119 | A field table inside a payload reads back all written values if and only if its fields are pairwise disjoint |
| Layout.LayoutRoundTrip | internal/vbus/registry.go:62-119 | Decoding returns every written value, scaled, in definition order, and with factors of at least 0.01 the raw values can be recovered |
| Layout.BS2Sound | internal/vbus/registry_custom.go:28-43 | The DeltaSol BS2 table fits its 28-byte payload and loses no value |
| Layout.BS2Reads | internal/vbus/registry_custom.go:28-43 | Every 28-byte payload of the device is read as these eleven numbers from these bytes, with their names and units |
| EndToEnd.TelemetrySurvives | internal/vbus/registry.go:62-119 | Measurements of any registered devices written to payloads, encoded, sent over a noisy line and received in arbitrary chunks give one known frame each, decoding to the values measured, in order |
| EndToEnd.ReceiveTelemetry | internal/vbus/parser.go:49-136 | The same through the parser object and the registry object, chunk by chunk and frame by frame |
| Names.ToGoFieldName | cmd/gen-registry/main.go:352-372 | The loop with its previous-character variable computes the name function |
| Names.GoNameShape | cmd/gen-registry/main.go:352-372 | A generated name is non-empty lower-case letters and digits joined by single underscores, none at either end |
| Names.GoNameWords | cmd/gen-registry/main.go:352-372 | No letter or digit is lost, added or moved; only a name without any becomes "field" |
| Names.SeparatorsJoin | cmd/gen-registry/main.go:360-364 | Anywhere in a name, a run of spaces, dashes and slashes counts as a single space |
| Names.SeparatorBetween | cmd/gen-registry/main.go:358-364 | A space, a dash or a slash between two words becomes an underscore |
| Names.OthersDropped | cmd/gen-registry/main.go:357-364 | Any other character that is no letter or digit is left out without trace |
| Names.GoNameOfPhrase | cmd/gen-registry/main.go:352-372 | A name of words separated by any runs of spaces, dashes and slashes, also before and after, becomes those words joined by single underscores |
| Names.GoNameIs | cmd/gen-registry/main.go:352-372 | A name is its words, split at separators and stripped of other characters, joined by underscores; without any it is "field" |
| Names.GoNameAgreeIff | cmd/gen-registry/main.go:352-372 | Two names become one if and only if they consist of the same words |
| Names.FieldSlug | internal/mqtt/client.go:249-259 | The loop computes the slug function |
| Names.SlugIs | internal/mqtt/client.go:249-259 | The slug is the lowered name with underscores for all but letters and digits, cut to the stretch from the first to the last letter or digit |
| Names.SlugFixedIff | internal/mqtt/client.go:249-259 | Slugging leaves a name alone if and only if it is lower-case words and underscores with none at either end |
| Names.GoNameIsSlug | internal/mqtt/client.go:249-259 | Slugging is the identity on the generator's names |
| Compiler.MapField | cmd/gen-registry/main.go:290-335 | The case analysis with its checking loop accepts exactly the supported part patterns and yields their type, offset and factor |
| Compiler.ReadableIff | cmd/gen-registry/main.go:290-335 | A little-endian numeral of one, two or four unmasked, unshifted bytes can be read as a numeric type on every payload if and only if it is accepted with that very type and well laid out: nothing readable is refused or mistyped |
| Compiler.NumeralAccepted | cmd/gen-registry/main.go:305-332 | Every such numeral is accepted, its top byte signed or not, and with which type |
| Compiler.AcceptedIff | cmd/gen-registry/main.go:290-335 | The accepted patterns of part count, mask, shift, multipliers and sign, type by type; everything else is refused |
| Compiler.MaskedRefused | cmd/gen-registry/main.go:297-330 | A part that is not a whole byte makes the field unsupported |
| Compiler.ShiftIs | cmd/gen-registry/main.go:75-82 | The shift in a described value drops the lowest bits or multiplies by a power of two |
| Compiler.CompilationFaithfulIff | cmd/gen-registry/main.go:290-335 | An accepted field reads, on every payload, the sum of its (signed, shifted) bytes times their multipliers if and only if it is well laid out |
| Compiler.ValuesPreservedIff | cmd/gen-registry/main.go:290-335 | The published value is the described one for every payload if the field is well laid out, and with at most four decimals only then |
| Compiler.FiveDecimalsHideLayout | cmd/gen-registry/main.go:290-335 | With five decimals a badly laid out field can publish the right value on every payload |
| Compiler.SignedByteMisread | cmd/gen-registry/main.go:305-309 | An input on which a signed single byte is misread |
| Compiler.SignedQuadMisread | cmd/gen-registry/main.go:324-332 | An input on which four bytes with a signed top byte are misread |
| Compiler.GappedPairMisread | cmd/gen-registry/main.go:311-322 | An input on which two parts with a gap between them are misread |
| Compiler.Generate | cmd/gen-registry/main.go:239-275 | The loops with their filters produce the entries of the selected packets in order; an entry comes out if and only if it describes a packet to 0x0010 with command 0x0100 that matches a single pair of addresses and has a supported field |
| Compiler.EntriesIff | cmd/gen-registry/main.go:239-275 | An entry is generated if and only if it is the compilation of a selected packet |
| Compiler.MatchesOnePairIff | cmd/gen-registry/main.go:247-250 | A description matches a single pair of addresses if and only if both its masks are 0xFFFF |
| Compiler.SelectedIff | cmd/gen-registry/main.go:239-266 | Selected are exactly the broadcast packets that match a single pair of addresses and have a supported field |
| Compiler.WildcardSkipped | cmd/gen-registry/main.go:247-250 | A packet for a whole range of sources yields no entry |
| Compiler.CompilationPreservesMeaning | cmd/gen-registry/main.go:239-275 | In whatever order the literal is evaluated, a frame of a selected packet whose key no other entry claims and no custom definition replaces is known to the merged registry; every well-laid-out field of it that the payload reaches is decoded to its described value, only badly laid out fields are read otherwise, and without any the telemetry is exactly the one described |
| Compiler.FieldArrives | cmd/gen-registry/main.go:253-262 | A well-laid-out supported field that the payload reaches is in the telemetry with its described value, whatever the other fields are |
| Compiler.PacketPreservedIff | cmd/gen-registry/main.go:253-262 | A packet whose supported fields have at most four decimals is decoded as described for every payload if and only if all of them are well laid out |
| Compiler.AlwaysRegisteredIff | internal/vbus/registry_gen.go:17-19 | Whatever the evaluation order, a definition is registered if and only if it is an entry and no other entry with its key differs |
| Compiler.PacketRegisteredIff | cmd/gen-registry/main.go:239-275 | A packet's definition is sure to be registered if and only if every selected packet of the same source compiles to the same entry |
| Compiler.SharedSourceHidesPacket | cmd/gen-registry/main.go:266-272 | Two packets of one source, either of which hides the other |
| Compiler.GeneratedRegistry | internal/vbus/registry_gen.go:17 | Registering the entries in any order gives the registry of the map that the literal has in that order |
| Compiler.DecodeCompiled | internal/vbus/registry.go:50-82 | Generating, initialising in either order and decoding gives a frame the custom meaning where there is one, and otherwise, field by field, the one its packet describes, if that is selected and alone with its key |
| Config.Store.LoadFile | internal/config/store.go:82-132 | The field-by-field overlay: each of the eleven saved values wins where present and not empty, everything else keeps its default, and a missing or unreadable file changes nothing |
| Config.MergeLaws | internal/config/store.go:82-132 | For arbitrary saved files, the settings after a start are exactly the ones that these laws allow, field by field |
| Config.BrokerOnly | internal/config/store.go:96-131 | A file that names only a broker changes only the broker |
| Config.Store.Update | internal/config/store.go:48-61 | Settings become fn of the old ones, the 64-bit version goes up by one, and the save reaches the disk as far as it got |
| Config.Store.SaveFile | internal/config/store.go:134-170 | Whichever system call fails, the settings file ends up unchanged or holding all of the current settings, the latter exactly when success is reported |
| Config.SaveIsAtomic | internal/config/store.go:159-169 | Whatever a save does to the temporary file, the settings file changes only if the rename is reached |
| Config.SaveElsewhere | internal/config/store.go:159-169 | A save touches no other file |
| Config.LeftBehind | internal/config/store.go:164-169 | What a save leaves under the temporary name for each way it can end |
| Config.CrashIsOutcome | internal/config/store.go:159-169 | A crash of the process at any point of a save leaves the file system as some failed save does |
| Config.PowerLossIff | internal/config/store.go:164-169 | After a power loss the settings file is the old or the new one if and only if the rename is missing on disk, or the data is there, or the rename moved a leftover temporary file that is one of the two |
| Config.PowerLossRun | internal/config/store.go:164-169 | Of any number of unsynced saves, the settings file has what the last rename on disk moved, or is the original |
| Config.LeftoverRevives | internal/config/store.go:164-169 | An input that brings back settings that are neither the old nor the new ones |
| Config.RestartLosslessIff | internal/config/store.go:82-170 | A restart restores the saved settings if and only if none was cleared while the environment sets it and the unpersisted ones are the environment's |
| Config.ClearedBrokerReturns | internal/config/store.go:102-104 | A broker cleared to empty is back after a restart in any environment that names one |
| Config.ReloadIdempotent | internal/config/store.go:82-170 | What a restart settles on survives every further save and restart |
| Config.CrashAtomicity | internal/config/store.go:134-170 | Whatever errors and crashes of the process interrupt sequential saves, and whatever temporary files that leaves, a restart finds the settings of the last completed save, or the original file |
| Config.UpdateThenRestart | internal/config/store.go:22-61 | A completely saved update is what the next start comes up with, up to cleared and unpersisted settings |
| VersionProtocol.NoStaleConfig | cmd/vbus2mqtt/main.go:65-107 | In every interleaving of updaters and readers, when the remembered version is current, no updater is between store and bump, and fewer than 2^64 updates lie between, all configs taken since are the current one |
| VersionProtocol.StaleIsNoticed | cmd/vbus2mqtt/main.go:134-138 | A reader with an outdated config sees a changed version as soon as the updaters have bumped |
| VersionProtocol.StaleWhileBetween | internal/config/store.go:48-55 | Between an updater's store and its bump a stale config passes the version check |
| VersionProtocol.StaleAfterWraparound | internal/config/store.go:18 | After 2^64 updates a stale config passes the version check |
| VersionProtocol.AlwaysFreshIff | cmd/vbus2mqtt/main.go:134-138 | For every number n of updaters between store and bump and k of bumps since the version was taken, passing checks always mean current configs if and only if n and k are zero, or k is no multiple of 2^64 and the check cannot pass |
| Bridge.Accumulate | cmd/vbus2mqtt/main.go:150-169 | Folding the frames of one read into the table gives the table of all frames so far |
| Bridge.LatestIff | cmd/vbus2mqtt/main.go:129-169 | The table has a source if and only if a known-device frame came from it, and holds the decoding of the last such frame |
| Bridge.ReadLoop | cmd/vbus2mqtt/main.go:120-190 | For every sequence of reads, timeouts, errors, version changes and clock values, the loop leaves for the right reason and publishes exactly the schedule computed from the bytes received |
| Bridge.TableOfReads | cmd/vbus2mqtt/main.go:139-169 | The table after some iterations is the one of the plain concatenation of all bytes they read, however short the reads |
| Bridge.TableIgnoresCuts | cmd/vbus2mqtt/main.go:139-169 | Two runs whose reads concatenate alike have the same table |
| Bridge.PublicationsOfReads | cmd/vbus2mqtt/main.go:131-186 | Every publication of a run shows the table of all bytes read up to and with its iteration |
| Bridge.LeavesIff | cmd/vbus2mqtt/main.go:131-148 | The loop is left at the first changed version or read error, the version being looked at first, or at the end |
| Bridge.PublicationsCorrect | cmd/vbus2mqtt/main.go:172-186 | Every publication shows the table of all bytes received so far, independent of how they were read, and starts at least the interval then in force after the one before it ended |
| Bridge.PublishedIff | cmd/vbus2mqtt/main.go:172-186 | An iteration publishes if and only if the interval has passed since the publication before it and some source is known: none is skipped |
| Bridge.PublicationsSpaced | cmd/vbus2mqtt/main.go:172-186 | Consecutive publications end at least that interval apart if the clock does not go back while publishing |
| Bridge.RunsOnCurrentConfig | cmd/vbus2mqtt/main.go:131-138 | Run against the version protocol, an iteration that passes the check has current settings, outside the two known limits |
| Bridge.ConfigChangedMeansUpdate | cmd/vbus2mqtt/main.go:133-136 | The loop leaves for changed settings only after an update has been completed since the version was taken |
| Delivery.CutStream | internal/vbus/parser.go:49-136 | Wherever a noisy stream of whole frames is cut off, exactly the frames that have arrived completely are read |
| Delivery.TableShowsLast | cmd/vbus2mqtt/main.go:150-169 | After any reads from the line the table has exactly the sources heard of, each with the last measurement that has arrived completely |
| Delivery.PublicationsShowMeasurements | cmd/vbus2mqtt/main.go:120-190 | Every publication of the read loop shows that table |
| Delivery.PayloadShowsMeasurement | internal/mqtt/client.go:141-149 | The payload of a measurement holds each measured value under its field name if the names are distinct, and with a factor of at least 0.01 the raw value can be recovered from it |
| Discovery.CacheKeyInjective | internal/mqtt/client.go:173-178 | The cache never confuses two (source, field) pairs |
| Discovery.CacheKeyIs | internal/mqtt/client.go:173-178 | The cache key is the address in capital hexadecimal, a slash and the field name |
| Discovery.UniqueIdIs | internal/mqtt/client.go:190-191 | The id is the prefix, the address in small hexadecimal and the slug, joined by underscores |
| Discovery.UniqueIdIff | internal/mqtt/client.go:190-191 | Two discovery ids are equal if and only if source and slug are |
| Discovery.UniqueIdInjective | internal/mqtt/client.go:190-191 | Names in slug form keep their discovery ids apart |
| Discovery.GeneratedIdIff | internal/mqtt/client.go:190-191 | Ids of the generator's names are equal if and only if source and name are |
| Discovery.UniqueIdCollides | internal/mqtt/client.go:190-191 | Other names can share an id although the cache keeps them apart |
| Discovery.Cache.Enter | internal/mqtt/client.go:178-187 | A pair goes on to be published if and only if no step since the last reset has claimed it; the cache is that of the run so far |
| Discovery.Cache.Clear | internal/mqtt/client.go:71-77 | A reconnect forgets all claims |
| Discovery.PublishDiscovery | internal/mqtt/client.go:172-225 | For any outcomes of the publishes, takes one step per field and delivers exactly the ids whose step led to a successful publish, each in order |
| Discovery.ClaimsAre | internal/mqtt/client.go:177-187 | One step per field, in order |
| Discovery.DeliveredIdsAre | internal/mqtt/client.go:190-223 | The ids delivered are those of the delivering steps, one for each, in order |
| Discovery.AttemptedOncePerEpoch | internal/mqtt/client.go:71-77 | In every interleaving of claims and reconnects a claim leads to a publish if and only if every earlier claim of that pair was followed by a reset |
| Discovery.DeliveredIff | internal/mqtt/client.go:177-223 | In one connection a pair reaches the broker if and only if the publish of its first claim succeeded |
| Discovery.FailureIsFinal | internal/mqtt/client.go:178-222 | A pair whose first publish fails stays unannounced although the second would succeed; after a reconnect it is published |
| Publishing.BuildPayload | internal/mqtt/client.go:141-155 | The loop builds the maps of values and units by name, leaving out an empty map of units |
| Publishing.LastWins | internal/mqtt/client.go:148-149 | Of fields with one name the payload has the value of the last |
| Publishing.UnitsNamed | internal/mqtt/client.go:150-152 | A unit is published for exactly the names of fields that have one, and never an empty one |
| Publishing.HoldsAllIff | internal/mqtt/client.go:148-149 | The payload holds every value if and only if fields of equal names have equal values |
| Publishing.CountIff | internal/mqtt/client.go:148-149 | It has as many values as there are fields if and only if their names are distinct |
| Publishing.UnitsRightIff | internal/mqtt/client.go:148-152 | Every value has its own unit if and only if no field without a unit is the last of a name that an earlier field with a unit has |
| Publishing.PublishesAllIff | internal/mqtt/client.go:148-149 | Every value decoded from any payload of a size is published if and only if any two fields of one name inside it have the same type, offset and factor, for factors that are powers of ten down to 0.0001 |
| Publishing.AlikeIff | internal/vbus/registry.go:84-119 | Two such fields extract the same value from every payload of a size if and only if they have the same type, offset and factor |
| Publishing.DistinctPublished | internal/mqtt/client.go:148-149 | With distinct names every decoded value is published |
| Publishing.TwinsPublished | internal/vbus/registry_gen.go:3386-3393 | A field listed twice loses nothing although its name is repeated |
| Publishing.GeneratedNamesIff | cmd/gen-registry/main.go:256-264 | A generated table has distinct names if and only if no two fields kept consist of the same words |
| Publishing.PublishedPacketIff | cmd/gen-registry/main.go:256-264 | All values of a generated device with at most four decimals are published if and only if any two of its fields that consist of the same words and lie inside the payload have the same type, offset and precision |
| Publishing.HeatCollapses | internal/vbus/registry_gen.go:2056-2058 | Three fields of one name, two of which are lost |
| Publishing.StrayUnit | internal/mqtt/client.go:150-152 | A value published with the unit of another field |

## Left out

- IEEE floating point: values are exact rationals, so a tie that binary rounding would break differently, and `Pow10` out of range, are not captured.
- `factorLit` and the generated text: entries are produced as values.
- `parseVSF`: table walking over a trusted file; the model starts from parsed packets.
- Offsets near the largest machine integer: `Offset+2` does not overflow here.
- The paho client, HTTP server and web UI, serial port detection, logging, status and environment parsing: library plumbing without deep properties.
- JSON encoding: the saved file is a record of optional values, and an unreadable file is a case of its own.
- The contents of the generated registry: data.
- Concurrent saves: `saveFile` runs outside the lock on one shared temporary path, so crash atomicity is stated for sequential updates.
- Aliasing of the parser's buffer: the buffer is a sequence value, so sharing of the underlying array between slices is not captured (payloads are copied out in the source).
- Discovery publishes that time out and still arrive later: delivered means confirmed in time.
- Per-source publish errors: a publication is the attempt to publish every entry of the table, in no particular order.
- `haClassFromUnit` and the discovery payload: a lookup table and formatting.
- The 512-byte read limit: reads may have any length.
- Config.CrashAtomicity: covers sequential saves only, as above, and assumes that file operations reach the disk in program order; what power losses can do to a run of saves is Config.PowerLossRun.
- Config.CrashIsOutcome: covers crashes of the process, after which the system still writes everything out in order, and not power losses.
